# AVL tree and plane-sweep containers, in Dafny

This project models two parts of a plane-sweep segment-intersection program.

- The AVL tree of `avl_tree.py`:
  - `insert`, `delete`, `min`, `successor`, `predecessor` and `inorder`;
  - the cached heights and balances and their recomputation (`update_heights`, `update_balances`);
  - `is_balanced`;
  - the rotations;
  - the `make_balanced` loop.
- The non-numeric layer of `plane_sweep.py`:
  - the event kinds and the point order;
  - the `Segment` constructor and `value_at_x`;
  - the `EventQueue` and `SweepLineStatus` containers, each an AVL tree beside a size counter;
  - the status's neighbour queries and the key exchange `reach_intersection_of`.

The tree is an immutable datatype, `Tree<K> = Nil | Node(left, key, right, height, balance)`.
- `Nil` stands for a Python `AVLTree` wrapper with no node.
- `Node` stands for a wrapper holding a node, with the wrapper's cached `height` and `balance` beside it.
- Every operation is a pure function that returns the new tree.
- The two walks that are loops in the source (`successor`, `predecessor`) are methods with loop invariants.

The key type is generic. The comparison is passed in as `lt` and assumed to be a strict weak order (`Orders.StrictWeakOrder`). Two keys are equal for the tree when neither is below the other (`Orders.Equiv`).
- The event queue uses the point order `Geometry.PointLess`, which is proved to be a strict weak order.
- The sweep-line status keeps `lt` abstract, because the source's segment comparison depends on a global sweep position.

Modules:
- `Options`: `Option`.
- `Orders`: strict weak orders and sortedness.
- `AvlCore`: the tree, its height, size, keys, in-order sequence, and the AVL and search-tree conditions.
- `AvlBalance`: cache recomputation, rotations, `make_balanced`.
- `AvlTree`: insert, delete, min, successor, predecessor and their AVL validity.
- `AvlSearch`: the search-order results.
- `AvlPaths`: node positions, the search `find`, and in-place key replacement.
- `Geometry`: points, segments, the point order, `value_at_x`.
- `SizedTrees`: the tree-plus-counter shared by both containers.
- `EventQueue`.
- `SweepStatus`.

## Model

| member | source | states |
|---|---|---|
| AvlCore.Height | avl_tree.py:189-200 | the height of an empty tree is -1, and a tree has a node exactly when its height is at least 0 |
| AvlCore.Inorder | avl_tree.py:115-130 | the in-order sequence has one entry per node |
| AvlCore.InorderKeys | avl_tree.py:115-130 | a key occurs in the in-order sequence exactly when some node holds it |
| AvlCore.CachedIsTrue | avl_tree.py:189-212 | when every cache is fresh, the cached height is the real height and the cached balance is the left height minus the right height, at every node |
| AvlCore.ValidIff | avl_tree.py:134-141 | a valid AVL tree is exactly one whose every node has balance in [-1, 1] and whose every cache is fresh |
| AvlCore.SearchTreeIffSorted | avl_tree.py:115-130 | every left key is below and every right key above its node exactly when the in-order sequence is strictly increasing |
| AvlCore.SearchTreeKeyCount | avl_tree.py:115-130 | in a search tree the number of distinct keys is the number of nodes |
| AvlCore.DistinctKeysOrdered | avl_tree.py:115-130 | in a search tree any two distinct keys are ordered one way or the other |
| AvlBalance.UpdateHeights | avl_tree.py:189-200 | the tree's links and keys are untouched; with recursion every height cache is exact; without it only the root's cache changes, and it is exact when the children's are |
| AvlBalance.UpdateBalances | avl_tree.py:202-212 | the links and keys are untouched, the root's height cache is kept and exact height caches stay exact; with recursion every balance cache is the difference of the child heights; without it the children are kept and the root's balance is fresh when the children's are |
| AvlBalance.Recompute | avl_tree.py:189-212 | recomputing heights then balances leaves the links and keys alone and makes every cache fresh |
| AvlBalance.RecomputeLocal | avl_tree.py:148-149 | the non-recursive refresh keeps the children as they are and makes the root's caches fresh when the children's are |
| AvlBalance.RecomputeLocalIdle | avl_tree.py:148-149 | refreshing a tree whose caches are already fresh changes nothing |
| AvlBalance.IsBalanced | avl_tree.py:134-141 | the answer is true exactly when every node's left and right heights differ by at most one; the tree is left with the same links and keys and every cache exact, and unchanged when its caches were already exact |
| AvlBalance.UpdateHeightsIdle | avl_tree.py:189-200 | a recursive height refresh of a tree whose height caches are exact changes nothing |
| AvlBalance.UpdateBalancesIdle | avl_tree.py:202-212 | a recursive balance refresh of a tree whose balance caches match changes nothing |
| AvlBalance.RecomputeIdle | avl_tree.py:139-140 | refreshing every cache of a tree whose caches are exact changes nothing |
| AvlBalance.RotateRight | avl_tree.py:169-177 | the rotation keeps the in-order sequence and the key set exactly |
| AvlBalance.RotateLeft | avl_tree.py:179-187 | the rotation keeps the in-order sequence and the key set exactly |
| AvlBalance.FixLeftHeavy | avl_tree.py:151-158 | the left-heavy arm, with or without the preliminary left rotation of the left child, keeps the in-order sequence and leaves every cache fresh |
| AvlBalance.FixLeftHeavyShape | avl_tree.py:151-158 | on AVL subtrees whose heights differ by two, the left-heavy arm is defined, gives an AVL tree, and its height is the left height or one more |
| AvlBalance.SingleRotationShape | avl_tree.py:156-158 | when the left child is not right-heavy, one right rotation gives an AVL tree whose height is the left height or one more |
| AvlBalance.DoubleRotationShape | avl_tree.py:152-158 | when the left child is right-heavy, its right child exists, and the left-right double rotation gives an AVL tree of the left child's height |
| AvlBalance.FixRightHeavy | avl_tree.py:160-167 | the right-heavy arm keeps the in-order sequence and leaves every cache fresh |
| AvlBalance.FixRightHeavyShape | avl_tree.py:160-167 | on AVL subtrees whose heights differ by two, the right-heavy arm is defined, gives an AVL tree, and its height is the right height or one more |
| AvlBalance.SingleRotationShapeMirror | avl_tree.py:165-167 | when the right child is not left-heavy, one left rotation gives an AVL tree whose height is the right height or one more |
| AvlBalance.DoubleRotationShapeMirror | avl_tree.py:161-167 | when the right child is left-heavy, its left child exists, and the right-left double rotation gives an AVL tree of the right child's height |
| AvlBalance.BalancePass | avl_tree.py:150-167 | one pass of the rotation loop keeps the in-order sequence and the key set |
| AvlBalance.BalancePassShape | avl_tree.py:150-167 | with fresh caches and AVL subtrees at most two apart in height, one pass yields an AVL tree with fresh caches, so the loop condition is then false; the height grows by at most one over the taller subtree; a balanced tree is left alone |
| AvlBalance.MakeBalanced | avl_tree.py:143-167 | rebalancing keeps the in-order sequence and the key set |
| AvlBalance.MakeBalancedValid | avl_tree.py:143-167 | on a node whose subtrees are valid AVL trees at most two apart in height, the result is a valid AVL tree with balance in [-1, 1]; its height is the taller subtree's plus at most one, and exactly plus one when the subtrees were already within one |
| AvlBalance.MakeBalancedIdle | avl_tree.py:143-167 | rebalancing a valid AVL tree changes nothing |
| AvlTree.Insert | avl_tree.py:25-45 | the key set gains exactly `k` when the flag is set and is unchanged otherwise, the node count follows the flag, and inserting into an empty tree gives one leaf with height 0 and balance 0 |
| AvlTree.InsertValid | avl_tree.py:25-45 | inserting into a valid AVL tree gives a valid AVL tree whose height grows by at most one |
| AvlTree.InsertPresentIdle | avl_tree.py:42-45 | a refused insert returns the valid tree unchanged |
| AvlSearch.InsertCorrect | avl_tree.py:25-45 | in a search tree, insert keeps the search order, leaves the in-order sequence strictly sorted, and adds a node exactly when no key equal to `k` was present |
| AvlTree.Min | avl_tree.py:78-85 | the result is absent exactly for the empty tree, and otherwise it is the first entry of the in-order sequence |
| AvlSearch.MinIsLeast | avl_tree.py:78-85 | in a search tree, the minimum is below every other key |
| AvlTree.Successor | avl_tree.py:100-113 | the walk returns nothing exactly when the right subtree is empty; otherwise it returns a node with no left child holding the right subtree's minimum, which is the in-order entry right after the node's key |
| AvlSearch.SuccessorIsNextAbove | avl_tree.py:100-113 | in a search tree, that key is above the node's key and below every other key of the node's subtree that is above the node's key |
| AvlTree.Predecessor | avl_tree.py:87-98 | the walk returns nothing exactly when the left subtree is empty; otherwise it returns a node with no right child holding the last key of the left subtree, which is the in-order entry right before the node's key |
| AvlSearch.PredecessorIsNextBelow | avl_tree.py:87-98 | in a search tree, that key is below the node's key and above every other key of the node's subtree that is below the node's key |
| AvlTree.Delete | avl_tree.py:47-76 | delete never adds a key, and it loses none when it reports that nothing was found |
| AvlTree.DeleteValid | avl_tree.py:47-76 | deleting from a valid AVL tree gives a valid AVL tree whose height shrinks by at most one |
| AvlTree.DeleteAbsentIdle | avl_tree.py:47-76 | a delete that finds nothing returns the valid tree unchanged |
| AvlSearch.DeleteCorrect | avl_tree.py:47-76 | in a search tree, delete keeps the search order, reports success exactly when a key equal to `k` was present, removes exactly the keys equal to `k`, and lowers the node count by one on success |
| AvlSearch.DeleteSorted | avl_tree.py:47-76 | after delete the in-order sequence is still strictly sorted |
| AvlTree.DeleteRoot | avl_tree.py:49-68 | removing the matched node never adds a key |
| AvlTree.DeleteRootValid | avl_tree.py:49-68 | removing the matched node of a valid AVL tree gives a valid AVL tree at most one lower |
| AvlSearch.DeleteRootCorrect | avl_tree.py:49-68 | in a search tree, removing the matched node keeps the search order and removes exactly that node's key |
| AvlSearch.DeleteRootSplice | avl_tree.py:51-57 | the leaf and single-child cases keep the search order and remove exactly the node's key |
| AvlSearch.DeleteHere | avl_tree.py:49-68 | when the root matches `k`, removing it meets the whole delete contract with success reported |
| AvlSearch.DescendLeft | avl_tree.py:69-74 | when `k` is below the root, a correct delete in the left subtree followed by rebalancing is a correct delete in the whole tree |
| AvlSearch.DescendRight | avl_tree.py:71-74 | when `k` is above the root, a correct delete in the right subtree followed by rebalancing is a correct delete in the whole tree |
| AvlTree.SpliceChild | avl_tree.py:54-57 | a wrapper taking over its only child's node keeps that child's in-order sequence and keys |
| AvlTree.SpliceChildValid | avl_tree.py:54-57 | when the child is a valid AVL tree, so is the result, with the same height |
| AvlSearch.SpliceChildSearch | avl_tree.py:54-57 | the spliced tree keeps the child's search order, keys and size |
| AvlTree.TakeSuccessor | avl_tree.py:59-67 | the two-children case never adds a key |
| AvlTree.TakeSuccessorValid | avl_tree.py:59-67 | the two-children case keeps a valid AVL tree valid and at most one lower |
| AvlSearch.TakeSuccessorCorrect | avl_tree.py:59-67 | the two-children case keeps the search order and removes exactly the node's key |
| AvlSearch.DeleteMin | avl_tree.py:64-66 | deleting the minimum of a search tree always succeeds, removes exactly that key, and leaves only keys above it |
| AvlSearch.SuccessorRebuild | avl_tree.py:61-67 | putting the right subtree's minimum at the root over the left subtree and the rest of the right subtree keeps the search order and removes exactly the old root key |
| AvlSearch.RebuildSearchTree | avl_tree.py:143-167 | rebalancing keeps the search order, the key set and the node count |
| AvlSearch.MemberLeft | avl_tree.py:36-37 | in a search tree, a key below the root is present exactly when it is present in the left subtree |
| AvlSearch.MemberRight | avl_tree.py:39-40 | in a search tree, a key above the root is present exactly when it is present in the right subtree |
| AvlSearch.OnlyNodeKeyEquiv | avl_tree.py:47-49 | in a search tree, when the root matches `k` no key in either subtree matches `k` |
| AvlPaths.Find | plane_sweep.py:172-173 | a position found by the search holds a node whose key equals `k` |
| AvlPaths.FindComplete | plane_sweep.py:172-173 | in a search tree, the search finds a position exactly when a key equal to `k` is present |
| AvlPaths.SetKey | plane_sweep.py:216-218 | replacing a node's key keeps every link and cached number |
| AvlPaths.SetKeyKeys | plane_sweep.py:216-218 | after the replacement the node holds the new key and every other node keeps its key |
| AvlPaths.SetKeyMultiset | plane_sweep.py:216-218 | the replacement trades one copy of the old key for one copy of the new key in the multiset of keys |
| AvlPaths.SwapKeys | plane_sweep.py:212-218 | exchanging two nodes' keys keeps every link and cached number |
| AvlPaths.SwapKeysKeys | plane_sweep.py:212-218 | each of the two nodes ends up with the other's key, and every other node keeps its key |
| AvlPaths.SwapKeysMultiset | plane_sweep.py:212-218 | the exchange keeps the multiset of keys, the size, and AVL validity |
| Geometry.Rank | plane_sweep.py:27-33 | the event kinds are numbered 0 to 3, one number each, in the order undefined, start, intersection, end |
| Geometry.PointGreaterIsConverse | plane_sweep.py:56-74 | `a > b` holds exactly when `b < a` |
| Geometry.PointLessLexicographic | plane_sweep.py:56-64 | the point order is lexicographic on x, then y, then the event kind's number |
| Geometry.PointEquivIff | plane_sweep.py:56-64 | two points are neither below nor above each other exactly when they agree on x, y and event kind |
| Geometry.PointOrderIsStrictWeak | plane_sweep.py:56-64 | the point order is irreflexive and transitive, and so is being neither below nor above |
| Geometry.EventKindsOrdered | plane_sweep.py:56-64 | at the same coordinates, an undefined point comes before a start, a start before an intersection, and an intersection before an end |
| Geometry.NewSegment | plane_sweep.py:87-97 | the start's x is at most the end's x; the endpoints are the two inputs tagged start and end in some order; both refer back to the segment; with equal xs the first input is the start |
| Geometry.NewSegmentSymmetric | plane_sweep.py:87-93 | unless the xs are equal, swapping the inputs gives the same segment |
| Geometry.StartEventFirst | plane_sweep.py:87-97 | unless the segment is vertical with distinct ys, its start event precedes its end event |
| Geometry.ValueAtX | plane_sweep.py:120-126 | the result is absent exactly when x is outside the segment's x-range; a vertical segment divides by zero; at either endpoint's x the value is that endpoint's y |
| Geometry.ValueBetweenEndpoints | plane_sweep.py:112-126 | in range, the value lies between the ys of the two endpoints |
| SizedTrees.Empty | plane_sweep.py:132-134 | a new container has no keys and counter 0 |
| SizedTrees.EmptyInv | plane_sweep.py:132-134 | a new container is a valid AVL search tree whose counter equals its number of keys |
| SizedTrees.Add | plane_sweep.py:136-140 | the counter goes up by one exactly when the key was added, and the key set follows |
| SizedTrees.AddKeepsInv | plane_sweep.py:136-140 | adding keeps the counter equal to the number of keys and the tree a valid AVL search tree, and succeeds exactly when no equal key was present |
| SizedTrees.Remove | plane_sweep.py:145-149 | the counter goes down by one exactly when a key was removed, and no key is gained |
| SizedTrees.RemoveKeepsInv | plane_sweep.py:145-149 | removing keeps the counter equal to the number of keys and the tree a valid AVL search tree, succeeds exactly when an equal key was present, and removes exactly the equal keys |
| SizedTrees.AddAsWritten | plane_sweep.py:136-140 | as written, the flag is always false and the counter never moves |
| SizedTrees.AddAsWrittenDrifts | plane_sweep.py:136-140 | as written, one insert into an empty container gives counter 0 beside a one-key tree |
| SizedTrees.RemoveAsWritten | plane_sweep.py:145-149 | as written, the flag is always false and the counter never moves |
| SizedTrees.RemoveAsWrittenDrifts | plane_sweep.py:145-149 | as written, removing the only key gives counter 1 beside an empty tree |
| EventQueue.NewQueue | plane_sweep.py:132-134 | a new queue has no events and counter 0 |
| EventQueue.NewQueueInv | plane_sweep.py:132-134 | a new queue is well formed |
| EventQueue.InsertEvent | plane_sweep.py:136-140 | the counter goes up exactly when the event was added, and the event set follows |
| EventQueue.InsertEventSpec | plane_sweep.py:136-140 | insert keeps the queue well formed and is refused exactly when an event with the same x, y and kind is queued |
| EventQueue.RemoveEvent | plane_sweep.py:145-149 | the counter goes down exactly when an event was removed, and no event is gained |
| EventQueue.RemoveEventSpec | plane_sweep.py:145-149 | remove keeps the queue well formed, succeeds exactly when an event with the same x, y and kind is queued, and removes exactly that event |
| EventQueue.QueuedIsMember | plane_sweep.py:56-64 | for points, being in the tree by the point order means having an event with the same x, y and kind |
| EventQueue.GetNearestEvent | plane_sweep.py:142-143 | the result is absent exactly for an empty tree, and otherwise is a queued event |
| EventQueue.NearestEventIsFirst | plane_sweep.py:142-143 | the result is absent exactly when the counter is 0, and otherwise it precedes every other queued event |
| SweepStatus.AddSegment | plane_sweep.py:159-163 | the counter goes up exactly when the segment was added, and the key set follows |
| SweepStatus.RemoveSegment | plane_sweep.py:165-169 | the counter goes down exactly when a segment was removed, and no segment is gained |
| SweepStatus.AddRemoveSegmentSpec | plane_sweep.py:159-169 | both keep the status well formed; add succeeds exactly when the segment was absent, and remove exactly when it was present |
| SweepStatus.GetAboveNeighbor | plane_sweep.py:171-177 | as written: the result is the minimum of the found node's right subtree, and it is absent exactly when that subtree is empty |
| SweepStatus.GetBelowNeighbor | plane_sweep.py:179-185 | as written: the result is the last key of the found node's left subtree, and it is absent exactly when that subtree is empty |
| SweepStatus.AboveNeighbor | plane_sweep.py:171-177 | a neighbour found above `k` is a key of the status and lies above `k` |
| SweepStatus.AboveNeighborIsLeast | plane_sweep.py:171-177 | in a search tree, the neighbour above is absent exactly when no key lies above `k`, and otherwise it is the least key above `k` |
| SweepStatus.BelowNeighbor | plane_sweep.py:179-185 | a neighbour found below `k` is a key of the status and lies below `k` |
| SweepStatus.BelowNeighborIsGreatest | plane_sweep.py:179-185 | in a search tree, the neighbour below is absent exactly when no key lies below `k`, and otherwise it is the greatest key below `k` |
| SweepStatus.AboveNeighborMissed | plane_sweep.py:171-177 | for keys a < b, in the valid status with b at the root and a as its left child, the node found for a has no right child, so the walk as written reports nothing above a, although b is above it |
| SweepStatus.BelowNeighborMissed | plane_sweep.py:179-185 | for keys a < b, in the valid status with a at the root and b as its right child, the node found for b has no left child, so the walk as written reports nothing below b, although a is below it |
| SweepStatus.ReachIntersectionOf | plane_sweep.py:212-218 | the result is absent exactly when either segment is not found; otherwise the counter and the tree's shape are kept |
| SweepStatus.ReachIntersectionOfSpec | plane_sweep.py:212-218 | the two found nodes exchange keys, every other node keeps its key, the multiset and set of keys are kept, and AVL validity is kept |

## Left out

Where the model departs from the source:
- AvlTree.Insert: the recursive calls at `avl_tree.py:37` and `avl_tree.py:40` name `insert_event`, which `AVLTree` does not define, so Python would raise `AttributeError` there. They are modelled as recursive calls to `insert`. Insert returns `(tree, flag)`, with the flag false exactly on the duplicate branch. The source returns nothing; what `plane_sweep.py` then does with that is under Findings.
- AvlTree.Min: the recursive call at `avl_tree.py:85` names `get_nearest_event`. It is modelled as a recursive call to `min`.
- AvlTree.Delete: returns `(tree, flag)`, with the flag true exactly when a matching key was found. The source returns nothing.
- AvlTree.Delete: a key matches when neither it nor the node's key is below the other. The source tests `==` at `avl_tree.py:49`, which for `Point` (no `__eq__`) is object identity. So a different object with the same x, y and event kind is deleted here. In the source, such an object passes none of the three tests and nothing is deleted.
- AvlPaths.Find: `AVLTree` has no `find`, although `plane_sweep.py:172` calls it. It is modelled as ordinary search-tree descent that returns the position of the matching node.
- AvlBalance.BalancePass: where the source would rotate on an empty child and raise, the pass leaves the tree unchanged. `AvlBalance.FixLeftHeavyShape` and `AvlBalance.FixRightHeavyShape` show this never happens to a tree that `insert` or `delete` builds.
- AvlBalance.MakeBalanced: the `while` loop is modelled as one pass. `AvlBalance.BalancePassShape` proves that after one pass the loop condition is false.
- AvlCore.Height: an empty wrapper always has height -1 and balance 0. In the source, an emptied wrapper can keep a stale cache until the next recomputation.
- Geometry.NewSegment: `Segment.__init__` mutates the caller's points and makes them refer to the segment object. The model returns tagged copies, with the segment named by a `SegmentId`.
- Geometry.ValueAtX: coordinates are exact reals, with no rounding, NaN or infinity. The `ZeroDivisionError` that a vertical segment raises is the result `DivisionByZero`.
- SweepStatus.ReachIntersectionOf: Python fails on `None.key` when a segment is not found; the model returns `None`. Exchanging keys can break the search order. The source relies on the segment order changing at the intersection point, and the model does not claim the order is kept.
- SweepStatus.GetAboveNeighbor: requires the segment to be found, where the source `assert`s it (`plane_sweep.py:173`).
- SweepStatus.GetBelowNeighbor: requires the segment to be found, where the source `assert`s it (`plane_sweep.py:181`).
- The duplicate-key message that `insert` prints is not modelled, nor is any other `print`.

What is not modelled at all:
- `Segment.__lt__` and `__gt__`: they read the class-level sweep position, so the status takes any strict weak order instead.
- `slope` and `interceptor` on their own: floating-point numerics. They appear only inside `Geometry.ValueAtX`.
- `intersection_with_upper`, `intersection_with_lower`, `calculate_intersection_point` and `calculate_triangle_area`: floating-point line solving and a `numpy` determinant.
- The `plane_sweep` driver loop and `main.py`: file input, argument checks and printing.
- The `__str__` methods: printing only.

## Findings

| source | as written | input that shows it | evidently intended | confidence | as-written member | corrected member |
|---|---|---|---|---|---|---|
| plane_sweep.py:136-140 | `insert_event` reads the result of `AVLTree.insert`, which is always `None`, so `size` never goes up | insert one event into a new queue: `size` stays 0 while the tree holds one event | `size` goes up by one when the event is added | high (not executed) | SizedTrees.AddAsWrittenDrifts | SizedTrees.AddKeepsInv |
| plane_sweep.py:145-149 | `remove_event` reads the result of `AVLTree.delete`, which is always `None`, so `size` never goes down; `add_segment` and `remove_segment` (plane_sweep.py:159-169) repeat both patterns | with the counter corrected for the insert, removing the only event leaves `size` at 1 beside an empty tree | `size` goes down by one when the event is removed | high (not executed) | SizedTrees.RemoveAsWrittenDrifts | SizedTrees.RemoveKeepsInv |
| plane_sweep.py:171-177 | `get_above_neighbor` uses `successor`, which looks only in the found node's right subtree | status with `b` at the root and a smaller `a` as its left child: the segment above `a` is `b`, but `None` is returned | the least segment above, wherever it sits in the tree | high (not executed) | SweepStatus.AboveNeighborMissed | SweepStatus.AboveNeighborIsLeast |
| plane_sweep.py:179-185 | `get_below_neighbor` uses `predecessor`, which looks only in the found node's left subtree | status with `a` at the root and a larger `b` as its right child: the segment below `b` is `a`, but `None` is returned | the greatest segment below, wherever it sits in the tree | high (not executed) | SweepStatus.BelowNeighborMissed | SweepStatus.BelowNeighborIsGreatest |
