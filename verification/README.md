# ArvoreAVL in Dafny

This is a model of the class `ArvoreAVL`, an AVL binary search tree of `Integer` keys written in Java. The model covers:

- the node structure, height and balance factor;
- the four rotations;
- the whole-tree rebalancing pass `verificaBalance`;
- insertion `add` and removal `remove`;
- the queries `contains`, `getSmallest`, `size`, `isEmpty`, `getRoot` and `clear`;
- the four traversals `positionsPre`, `positionsPos`, `positionsCentral` and `positionsWidth`.

The linked nodes become an immutable datatype, `Tree = Leaf | Node(left, key, right)`. A `Leaf` is an absent (null) child. The object is `AvlTree(root, count)`. Each mutating method becomes a function from the old object to the new one.

Modules:

- `BinaryTrees` (trees.dfy) covers:
  - height, balance, keys (a multiset), node count and the in-order sequence;
  - search order (`Bst`) and the AVL invariant (`Balanced`);
  - the height bounds.
- `Rotations` (rotations.dfy) holds `rotacaoSimplesDireita`, `rotacaoSimplesEsquerda`, `rotacaoDuplaDireita` and `rotacaoDuplaEsquerda`.
- `Rebalancing` (rebalance.dfy) holds `verificaBalance` and its dispatch at one node.
- `Queries` (queries.dfy) holds `searchNodeRef`, `smallest` and the traversals. Level order is a method with a queue loop.
- `Insertion` (insertion.dfy) holds the recursive `add`, the rebalancing after it, and the proof that insertion keeps an AVL tree balanced.
- `Deletion` (deletion.dfy) holds the three cases of `remove(Node)` and the rebalancing after it.
- `ArvoreAvl` (arvore.dfy) holds the public methods of the class, acting on `AvlTree`.
- `Scenarios` (scenarios.dfy) holds repeated insertion and concrete runs: a single rotation, a double rotation, and removal of a node with two children.
- `Findings` (findings.dfy) holds `remove` as written, with its two null dereferences.
- `Options` (options.dfy) holds `Option` (for Java `null`) and `Result` (for a thrown exception).

Three choices of the code shape the model:

- **Height convention.** `height` (lines 234-244) gives a node without children height 1, and `calculaBalance` (lines 246-262) treats an absent child as height 0. `BinaryTrees.Height` uses the same convention. The balance factor is the right height minus the left height.
- **Equal keys go left.** The recursive `add` (lines 136-141) goes right only when the node's key is smaller, so an equal key goes left. A right rotation can then lift an equal key into the right subtree of its twin. For that reason, search order is the non-strict `left keys <= key <= right keys`.
- **Child factor 0 takes the double rotation.** `verificaBalance` tests `n.balance * child.balance > 0` (lines 274 and 280). A child factor of 0 gives product 0, so it takes the double rotation. `Rebalancing.Fix` states this dispatch in full.

## Model

| member | source | states |
|---|---|---|
| BinaryTrees.InOrderContents | ArvoreAVL/ArvoreAVL.java:460-466 | the in-order listing holds every key of the tree once per occurrence, and its length is the node count |
| BinaryTrees.BstIffSortedInOrder | ArvoreAVL/ArvoreAVL.java:449-466 | a tree is in search order exactly when its in-order listing is ascending, in both directions |
| BinaryTrees.HeightBetween | ArvoreAVL/ArvoreAVL.java:234-244 | with height counted as in `height` (present node 1, absent 0), a tree of height h has at least h and fewer than 2^h nodes, and a present node has height at least 1 |
| BinaryTrees.BalancedHeightBound | ArvoreAVL/ArvoreAVL.java:2 | a tree whose every balance factor lies in -1..1 (the AVL property the class claims) of height h holds at least 2^ceil(h/2) - 1 nodes, so its height is logarithmic in its size |
| Rotations.RotateLeft | ArvoreAVL/ArvoreAVL.java:290-304 | `rotacaoSimplesDireita` needs a right child; that child becomes the subtree root with the old root as its left child, and the in-order sequence is unchanged |
| Rotations.RotateRight | ArvoreAVL/ArvoreAVL.java:318-333 | `rotacaoSimplesEsquerda` needs a left child; that child becomes the subtree root with the old root as its right child, and the in-order sequence is unchanged |
| Rotations.RotateRightLeft | ArvoreAVL/ArvoreAVL.java:306-316 | `rotacaoDuplaDireita` needs the inner grandchild `right.left`; it becomes the subtree root, with the old root on its left and the old right child on its right, and the in-order sequence is unchanged |
| Rotations.RotateLeftRight | ArvoreAVL/ArvoreAVL.java:335-345 | `rotacaoDuplaEsquerda` needs the inner grandchild `left.right`; it becomes the subtree root, with the old left child on its left and the old root on its right, and the in-order sequence is unchanged |
| Rebalancing.ProductSign | ArvoreAVL/ArvoreAVL.java:272-285 | when the parent factor is at least 2 in absolute value, the product of factors is positive exactly when the child leans the same way as the parent |
| Rebalancing.Fix | ArvoreAVL/ArvoreAVL.java:271-287 | a node with factor in -1..1 is left alone. At factor >= 2, a right child leaning right gives the single rotation. A right child with factor <= 0, including 0, gives the double rotation, and its inner grandchild exists. The mirror holds for factor <= -2. The in-order sequence is kept |
| Rebalancing.Rebalance | ArvoreAVL/ArvoreAVL.java:264-288 | the post-order pass keeps the in-order sequence and leaves an already balanced tree unchanged |
| Rebalancing.RebalanceKeepsContents | ArvoreAVL/ArvoreAVL.java:264-288 | the pass keeps the key multiset, the node count and search order |
| Queries.Search | ArvoreAVL/ArvoreAVL.java:97-109 | a subtree that `searchNodeRef` returns is a present node holding the key searched for |
| Queries.SearchFindsKey | ArvoreAVL/ArvoreAVL.java:86-109 | search finds only keys the tree holds; on a search tree it finds a key exactly when the tree holds it |
| Queries.Leftmost | ArvoreAVL/ArvoreAVL.java:225-232 | `smallest` of a present node reaches the first key of the in-order sequence |
| Queries.LeftmostIsMinimum | ArvoreAVL/ArvoreAVL.java:225-232 | that key is held by the tree and, in a search tree, is no greater than any key held |
| Queries.PreOrder | ArvoreAVL/ArvoreAVL.java:414-420 | pre-order lists exactly the tree's keys, one entry per node, with the root first |
| Queries.PostOrder | ArvoreAVL/ArvoreAVL.java:437-443 | post-order lists exactly the tree's keys, one entry per node, with the root last |
| Queries.LevelOrder | ArvoreAVL/ArvoreAVL.java:472-490 | the queue loop records exactly the tree's keys, one entry per node, with the root first |
| Queries.TraversalsArePermutations | ArvoreAVL/ArvoreAVL.java:403-466 | pre-order and post-order are permutations of the in-order sequence |
| Insertion.Insert | ArvoreAVL/ArvoreAVL.java:128-143 | the recursive `add` adds exactly one occurrence of the key and exactly one node |
| Insertion.InsertInOrder | ArvoreAVL/ArvoreAVL.java:128-143 | nothing else changes: the in-order sequence gains exactly the new key at one position, and on a search tree that position follows every smaller key and precedes every key at least as large, the slot of a fresh leaf on the search path |
| Insertion.InsertKeepsOrder | ArvoreAVL/ArvoreAVL.java:136-141 | sending the key right exactly when the node's key is smaller keeps search order |
| Insertion.Add | ArvoreAVL/ArvoreAVL.java:115-120 | insertion followed by `verificaBalance` adds exactly the key and one node, and keeps search order and the AVL property |
| Insertion.InsertKeepsBalance | ArvoreAVL/ArvoreAVL.java:115-120 | a balanced tree stays balanced after insertion and one rebalancing pass |
| Insertion.InsertThenRebalance | ArvoreAVL/ArvoreAVL.java:115-120 | for a balanced tree, the result is balanced; its height is the old height or one more; and when it grew, its root is not level |
| Insertion.FixAfterRightGrowth | ArvoreAVL/ArvoreAVL.java:272-278 | the step at a node whose right subtree grew by at most one level restores balance, and the height grows by at most one |
| Insertion.FixAfterLeftGrowth | ArvoreAVL/ArvoreAVL.java:279-285 | the mirror image for the left subtree |
| Insertion.SingleRotationBalances | ArvoreAVL/ArvoreAVL.java:290-304 | the single rotation of a node two levels heavier on the side where its child leans gives a balanced subtree |
| Insertion.DoubleRotationBalances | ArvoreAVL/ArvoreAVL.java:306-316 | after the double rotation the old inner grandchild roots a balanced subtree with factor 0, two levels above the outer subtrees |
| Deletion.RemoveLeftmost | ArvoreAVL/ArvoreAVL.java:178-180 | removing the node that `smallest` reaches drops the first entry of the in-order sequence and keeps the rest |
| Deletion.RemoveLeftmostKeys | ArvoreAVL/ArvoreAVL.java:178-180 | that removal takes away exactly one occurrence of the smallest key and one node |
| Deletion.RemoveLeftmostKeepsOrder | ArvoreAVL/ArvoreAVL.java:178-180 | that removal keeps search order |
| Deletion.Unlink | ArvoreAVL/ArvoreAVL.java:163-205 | the three cases of `remove(Node)` (leaf detached, single child lifted, two children replaced by the successor) leave a tree without the key unchanged |
| Deletion.UnlinkKeys | ArvoreAVL/ArvoreAVL.java:163-205 | for a key that search finds, exactly one occurrence of it and one node leave the tree |
| Deletion.UnlinkAddsBack | ArvoreAVL/ArvoreAVL.java:163-205 | putting the removed key back into the remaining keys gives the original keys |
| Deletion.UnlinkHereKeys | ArvoreAVL/ArvoreAVL.java:165-205 | at the node found, each of the three cases removes exactly that node's key and one node |
| Deletion.UnlinkInOrder | ArvoreAVL/ArvoreAVL.java:163-205 | the in-order sequence loses exactly one entry, which holds the key, and keeps the others in order |
| Deletion.UnlinkHereInOrder | ArvoreAVL/ArvoreAVL.java:165-205 | at the node found, that entry is the node's own position in the in-order sequence, also in the successor case |
| Deletion.UnlinkKeepsOrder | ArvoreAVL/ArvoreAVL.java:163-205 | the structural removal keeps search order |
| Deletion.SuccessorKeepsOrder | ArvoreAVL/ArvoreAVL.java:177-180 | the smallest key of the right subtree can replace the removed key without breaking search order |
| Deletion.RemoveFound | ArvoreAVL/ArvoreAVL.java:163-207 | the removal with its rebalancing passes (two in the successor case) removes exactly one occurrence of the key and one node, and keeps search order |
| Deletion.RemoveFoundInOrder | ArvoreAVL/ArvoreAVL.java:163-207 | the whole removal deletes one entry holding the key from the in-order sequence and keeps the rest in order |
| ArvoreAvl.New | ArvoreAVL/ArvoreAVL.java:41-44 | the constructor gives an empty, valid, balanced tree |
| ArvoreAvl.Clear | ArvoreAVL/ArvoreAVL.java:49-52 | `clear` gives an empty, valid tree with count 0, whatever it held |
| ArvoreAvl.IsEmpty | ArvoreAVL/ArvoreAVL.java:58-60 | `isEmpty` holds exactly when no key is held, and on a valid tree exactly when the count is 0 |
| ArvoreAvl.Size | ArvoreAVL/ArvoreAVL.java:66-68 | on a valid tree `size` equals the number of keys and the length of the in-order listing |
| ArvoreAvl.GetRoot | ArvoreAVL/ArvoreAVL.java:74-79 | `getRoot` fails with `EmptyTreeException` exactly when no key is held; otherwise it returns a node holding all the keys |
| ArvoreAvl.Contains | ArvoreAVL/ArvoreAVL.java:86-89 | null gives false; true means the key is held; on a valid tree true exactly when the key is held |
| ArvoreAvl.Add | ArvoreAVL/ArvoreAVL.java:115-120 | the count goes up by one, the keys gain one occurrence of the element, and validity and balance are kept |
| ArvoreAvl.Remove | ArvoreAVL/ArvoreAVL.java:150-161 | false leaves the object unchanged. True means the key was held, the count drops by one, and one occurrence leaves the keys. On a valid tree the answer is true exactly when the element is non-null and held, and validity is kept |
| ArvoreAvl.GetSmallest | ArvoreAVL/ArvoreAVL.java:213-219 | null exactly on an empty tree; otherwise the head of the in-order sequence, a held key, and on a valid tree the least key |
| ArvoreAvl.PositionsPre | ArvoreAVL/ArvoreAVL.java:403-407 | lists exactly the keys held, and on a valid tree `size` of them |
| ArvoreAvl.PositionsPos | ArvoreAVL/ArvoreAVL.java:426-430 | lists exactly the keys held, and on a valid tree `size` of them |
| ArvoreAvl.PositionsCentral | ArvoreAVL/ArvoreAVL.java:449-453 | lists exactly the keys held; on a valid tree `size` of them, in ascending order |
| ArvoreAvl.PositionsWidth | ArvoreAVL/ArvoreAVL.java:472-490 | lists exactly the keys held, as a permutation of `positionsCentral`, and on a valid tree `size` of them |
| ArvoreAvl.AddThenRemove | ArvoreAVL/ArvoreAVL.java:115-161 | adding a key to a valid tree and then removing it reports true and gives back the same keys and count |
| Scenarios.AddAll | ArvoreAVL/ArvoreAVL.java:115-120 | repeated `add` adds exactly the given keys and their number to the count, and keeps validity and balance from an empty tree on |
| Scenarios.AscendingAddsRotateOnce | ArvoreAVL/ArvoreAVL.java:290-304 | adding 10, 20, 30 to a new tree gives root 20 with children 10 and 30 |
| Scenarios.SingleRotationOnAdd | ArvoreAVL/ArvoreAVL.java:272-275 | adding 30 to the right spine 10, 20 makes the pass apply the single rotation at the root |
| Scenarios.ZigZagAddsRotateTwice | ArvoreAVL/ArvoreAVL.java:335-345 | adding 30, 10, 20 to a new tree gives root 20 with children 10 and 30 |
| Scenarios.DoubleRotationOnAdd | ArvoreAVL/ArvoreAVL.java:279-284 | adding 20 below 30, 10 makes the pass apply the double rotation at the root |
| Scenarios.RemoveWithTwoChildren | ArvoreAVL/ArvoreAVL.java:177-180 | after adding 20, 10, 30, 5, 15, removing 20 returns true, count 4, and the tree 15(10(5), 30) |
| Scenarios.SuccessorRemoval | ArvoreAVL/ArvoreAVL.java:150-161 | the same removal, starting from the tree those additions build |
| Scenarios.SuccessorRemovalTree | ArvoreAVL/ArvoreAVL.java:177-180 | the successor 30 takes the place of 20, and the rebalancing gives 15(10(5), 30) |
| Scenarios.SuccessorRebalance | ArvoreAVL/ArvoreAVL.java:280-284 | a left child with factor 0 under a node with factor -2 takes the double rotation, and the result is balanced |
| Scenarios.RemovalCanLeaveImbalance | ArvoreAVL/ArvoreAVL.java:163-207 | removing 9 from the balanced search tree 7(4(2(1, 3), 5(-, 6)), 8(-, 9)) leaves a tree that is not balanced, so `remove` does not keep the AVL property |
| Scenarios.DoubleRotationLeavesImbalance | ArvoreAVL/ArvoreAVL.java:279-285 | a node of factor -2 over a left child of factor 0 is double-rotated by the pass, and the lowered left child ends with factor -2 |
| Scenarios.PassAfterNine | ArvoreAVL/ArvoreAVL.java:264-287 | after 9 is cut off, the pass lifts 5 by the double rotation and the result is not balanced |
| Scenarios.EmptyTreeQueries | ArvoreAVL/ArvoreAVL.java:74-79 | on a new tree `getSmallest` is null, `getRoot` fails, `contains` is false and `remove` is false |
| Findings.RemoveAsWritten | ArvoreAVL/ArvoreAVL.java:163-207 | `remove` as written agrees with `ArvoreAvl.Remove` whenever it returns. Wherever it throws, the corrected removal succeeds. It throws in the rebalancing pass exactly when the corrected removal empties the tree |
| Findings.LastNodeIsRoot | ArvoreAVL/ArvoreAVL.java:174-176 | the removal empties the tree exactly when the key sits in a root with no children |
| Findings.LeftOnlyChildCrashes | ArvoreAVL/ArvoreAVL.java:193-200 | after adding 3, 2, 4, 1, removing 2 throws at line 200, where the corrected removal returns true and the tree 3(1, 4) |
| Findings.LeftOnlyChildRemoval | ArvoreAVL/ArvoreAVL.java:193-200 | the same, starting from the tree those additions build |
| Findings.LastNodeCrashes | ArvoreAVL/ArvoreAVL.java:174-176 | after adding 1, removing 1 throws in `verificaBalance` at line 265, where the corrected removal returns true and an empty tree |
| Findings.LastNodeRemoval | ArvoreAVL/ArvoreAVL.java:206 | the same, starting from the one-node tree |

## Left out

- `father` links (lines 13, 131, 164-204) are not modelled. Removal is a functional descent along the path `searchNodeRef` takes. This equals the source's splicing only while every `father` link is exact, and the rotations (lines 290-345) never update `father`. For example, add 10, 20, 30 and then remove 10. After the rotation, 10 still has the null `father` it had as the root, so the code takes it for the root and sets `root` to null, and the pass then fails at line 265. The model removes 10 as if the links were exact.
- Findings.RemoveAsWritten: it decides whether the node found has a father by asking whether it is the root, so it also assumes exact `father` links and does not show the stale-link failure above.
- ArvoreAvl.Remove: no AVL balance claim after removal. The dispatch at lines 274 and 280 sends a child factor of 0, which only removal produces, to the double rotation. That rotation does not restore balance in general: `Scenarios.RemovalCanLeaveImbalance` removes 9 from a balanced search tree and gets a tree with a node of factor -2. Adding 7, 4, 8, 2, 5, 9, 1, 3, 6 builds that tree without any rotation, so its `father` links are exact and the model follows the source there. Only search order, the key multiset, the count and the in-order result are proved.
- Deletion.RemoveFound: no AVL balance claim either, for the same reason.
- The stored `balance` field and the global recompute `calculaBalance(root)` (lines 17, 118, 246-262) are not modelled as state. Balance is computed from heights on demand, which is what the recompute makes the field hold when `verificaBalance` reads it. The cost of the recompute is not modelled.
- Line 119 discards the node that `verificaBalance(root)` returns. The field is reassigned inside the single rotations (lines 300-302 and 329-331) when the rotated node is the root. The model uses the returned tree as the new root, which is the same node.
- `Rebalancing.Rebalance`: on an empty tree the source dereferences null (line 265); the model returns the empty tree. The only call that reaches it is the one modelled in `Findings.RemoveAsWritten`.
- `add(null)` is not modelled, because the key is an `int`. On an empty tree the source accepts null: the `n == null` branch (lines 129-132) stores it in a new root, and `count` becomes 1. On a non-empty tree the comparison at line 136 dereferences null.
- `count` is a Java `int`. Its wrap-around after 2^31 - 1 additions is not modelled; `AvlTree.count` is unbounded.
- The DOT output (lines 347-397) is console formatting and is left out.
- `EmptyTreeException`, `Queue` and `LinkedListOfInteger` are not part of this model. The exception is the `Result` failure `EmptyTreeException`, the queue is a `seq<Tree>`, and the list is a `seq<int>`.
- BinaryTrees.BalancedHeightBound: it proves a height of at most about 2·log2(n + 1) for n keys. It does not prove the sharper bound of about 1.44·log2(n + 2), which follows from the same AVL invariant through the recurrence N(h) = N(h-1) + N(h-2) + 1 for the fewest nodes of height h; that recurrence is not proved here.
- Insertion.Insert: its contract does not bound the height before rebalancing. The height bound is stated after rebalancing, by `Insertion.InsertThenRebalance`.

## Findings

| source | as written | input that shows it | evidently intended | confidence | as-written member | corrected member |
|---|---|---|---|---|---|---|
| ArvoreAVL/ArvoreAVL.java:200 | the node removed has only a left child and has a father; the code sets `n.right.father`, but `n.right` is null | add 3, 2, 4, 1, then remove 2 | `n.left.father = father`, lifting the left child as the right-child case does at line 188 | not executed | Findings.LeftOnlyChildCrashes | ArvoreAvl.Remove |
| ArvoreAVL/ArvoreAVL.java:206 | removing the only node sets `root` to null, then calls `verificaBalance(root)`, which reads `n.right` of null at line 265 | add 1, then remove 1 | skip the pass when the tree became empty, so `remove` returns true and the tree is empty | not executed | Findings.LastNodeCrashes | ArvoreAvl.Remove |
